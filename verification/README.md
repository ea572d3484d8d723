# Central Bank resolutions collector: a Dafny model

This project models the decision and string logic of the scripts that
collect Brazilian Central Bank resolutions, and it proves properties of that
model. The source scripts do four things:

- **Collector** (`data_collection/resolution_collector.py`). It walks the
  search results 15 rows at a time (`startRow` 0, 15, 30, …) and stops at
  the first page without resolution links. It then extracts a
  `CentralBankResolution` from each link: the title, the body spans joined
  by newlines, the URL, the last ten characters of the title as the
  publication date, and a timestamp. It keeps the successful extractions
  and writes them out. If anything fails inside the collection `try`, the
  error is logged and nothing new is written. A write that fails after
  `open(file_path, "w")` has already emptied the file (see "## Left out").
- **Content validator** (`data_collection/content_validator.py`). It applies
  two rules to a text: at least 100 characters, and not whitespace only.
  Errors accumulate rather than stopping at the first. A directory scan
  maps each `*.txt` file name to a `ResolutionValidationResult`.
- **Legacy extractor scripts** (`extractor/`). These are the `.pdf` link
  downloader, the PDF-to-text step, and a length-only validator.

The browser, HTTP, PDF parsing and the file system become explicit values:

- A search page is a list of links or a failed fetch/wait.
- A search source is a finite map from offset to page.
- A resolution page either never became ready, or shows an optional title
  and a list of span texts.
- A file is a name plus its text or a read failure.
- Each request or conversion reports success through a predicate parameter.

Python string built-ins are modelled with Python's semantics in `PyStr`:
`startswith`, `endswith`, `strip` with the `str.isspace` character set,
`s[-k:]`, `sep.join`, single-character `split`, and `replace`, which
replaces every occurrence.

Modules: `Outcomes` (option, return-or-raise, directory entries), `Seqs`
(order-preserving filter), `PyStr`, `Files` (the ".pdf" and ".txt" name
tests), `ResolutionCollector`,
`ContentValidator`, `Downloader`, `Extractor`, `ExtractionValidator`.

## Model

| member | source | states |
|---|---|---|
| ResolutionCollector.Enumerate | data_collection/resolution_collector.py:73-90 | The n-th requested offset is 15·n. Every page before the last lists at least one link. The loop ends normally exactly when the last page lists no links, and in failure exactly when the last page failed. The collected links are the in-order concatenation of the links of all earlier pages. |
| ResolutionCollector.StopsAfter | data_collection/resolution_collector.py:76-90 | The loop requests exactly the pages up to and including the first one without links: offsets 0, 15, …, 15k. |
| ResolutionCollector.StopsAtFirstEmptyPage | data_collection/resolution_collector.py:76-90 | Suppose k pages list links and the next page lists none. Then exactly k+1 pages are fetched, at offsets 0, 15, …, 15k, and the links are those of the first k pages. |
| ResolutionCollector.FailsAtFirstFailedPage | data_collection/resolution_collector.py:79-81 | Suppose k pages list links and the next fetch or wait fails. Then exactly k+1 pages are fetched and the enumeration ends in failure. |
| ResolutionCollector.FailedPageSavesNothing | data_collection/resolution_collector.py:99-102 | A failed page anywhere in the enumeration means the run is only logged. `save_data` is skipped, so nothing is persisted. |
| ResolutionCollector.EmptyFirstPageSavesEmptyBatch | data_collection/resolution_collector.py:84-99 | A first page without links still writes an empty batch. |
| ResolutionCollector.Extract | data_collection/resolution_collector.py:35-61 | Returns a record exactly when the page is extractable: it became ready, has a title and has at least one body span. Otherwise it returns None and never raises. The record's url is the input URL. Its publication date ends the title and has length min(10, \|title\|). Its content contains n−1 more newlines than the n spans, has length equal to their total plus n−1, equals the span for n = 1, and splits back into the spans when none contains a newline. Span i stands at offset TotalLength(spans[..i]) + i with a newline right behind it unless it is the last, which with the length fixes the content as the join. |
| ResolutionCollector.Record | data_collection/resolution_collector.py:48-58 | The record keeps the title, URL and timestamp. Its publication date is the last min(10, \|title\|) characters of the title. Its content has n−1 more newlines than the n spans and their total length plus n−1. It is the single span when n = 1, and splits back into the spans when none contains a newline. Span i stands at offset TotalLength(spans[..i]) + i with a newline right behind it unless it is the last, also when spans contain newlines. |
| ResolutionCollector.ExtractEach | data_collection/resolution_collector.py:93-95 | One extraction result per link, in link order, each the extraction of that link's page. A result is a record exactly when that page is extractable. Each record carries its own link as url. |
| ResolutionCollector.Successful | data_collection/resolution_collector.py:92-97 | Keeps exactly the successful results: a record is in the batch iff it was extracted. The batch is no longer than the results, and is as long as them when all succeeded. |
| ResolutionCollector.SuccessfulConcat | data_collection/resolution_collector.py:93-97 | Filtering distributes over concatenation, so records keep the order of their URLs. |
| ResolutionCollector.SuccessfulKeepsOrder | data_collection/resolution_collector.py:92-97 | Any two records of the batch come from two results in the same order: the earlier record from the earlier result. |
| ResolutionCollector.BatchInLinkOrder | data_collection/resolution_collector.py:92-97 | Any two records of the batch of a link list are the extractions of two links in the same order. |
| ResolutionCollector.SuccessfulIsBatchOfLinks | data_collection/resolution_collector.py:92-97 | The batch of a link list is no longer than the links and uses only their URLs. It holds the record of every extractable link, every record is the extraction of some link, and its records follow link order. |
| ResolutionCollector.BatchFollowsLinkOrder | data_collection/resolution_collector.py:92-97 | The batch for a longer link list starts with the batch for its prefix. |
| ResolutionCollector.Collect | data_collection/resolution_collector.py:63-102 | A driver start-up failure raises to the caller. A batch is saved exactly when the driver started, the enumeration ended at an empty page, and the write succeeded. The saved batch is no longer than the links, and every record's url is one of them. A saved batch holds the record of every link whose page is extractable, and every record in it is the extraction of some link. It is exactly the successful extractions of the links, and any two of its records stand in the order of the links they came from. |
| ResolutionCollector.OneCompleteOneMissingBody | data_collection/resolution_collector.py:44-56 | Take two documents, one with title "Resolution No. 1, 01/01/2024" and 150 characters of body, one without body spans. Exactly one resolution is saved, dated "01/01/2024". |
| PyStr.Join | data_collection/resolution_collector.py:49 | Joining no parts gives "", and joining one part gives that part. |
| PyStr.JoinLaysOutParts | data_collection/resolution_collector.py:49 | In a one-character join, part i stands at offset TotalLength(parts[..i]) + i and the separator follows every part but the last. |
| PyStr.LaidOutIsJoin | data_collection/resolution_collector.py:49 | A string as long as the join, holding every part at its place with the separator behind every part but the last, is the join: the layout fixes the joined text. |
| PyStr.JoinEnds | data_collection/resolution_collector.py:49 | A join of n ≥ 1 parts starts with the first part and ends with the last. |
| PyStr.JoinLength | data_collection/resolution_collector.py:49 | `"\n".join` of n ≥ 1 parts is as long as the parts together plus n−1. |
| PyStr.JoinAddsSeparators | data_collection/resolution_collector.py:49 | Joining n ≥ 1 parts with a one-character separator adds exactly n−1 occurrences of that character. |
| PyStr.SplitJoin | data_collection/resolution_collector.py:49 | Splitting a join of separator-free parts gives the parts back. |
| PyStr.SliceFromEnd | data_collection/resolution_collector.py:50 | `s[-k:]` is a suffix of s. For k > 0 it has length min(k, \|s\|); for k = 0 it is all of s. |
| PyStr.Split | extractor/downloader.py:20 | `split` returns one more piece than there are separators. No piece contains the separator. A separator-free string is a single piece. |
| PyStr.JoinSplit | extractor/downloader.py:20 | Joining the pieces of a split with the same separator gives the string back. |
| PyStr.LastPiece | extractor/downloader.py:20 | `split(c)[-1]` is the longest suffix free of c: it ends the string, contains no c, and is either the whole string or preceded by c. |
| PyStr.StripLeading | data_collection/content_validator.py:26 | `lstrip` removes only whitespace, and the rest does not start with whitespace. |
| PyStr.StripTrailing | data_collection/content_validator.py:26 | `rstrip` removes only whitespace, and the rest does not end with whitespace. |
| PyStr.Strip | data_collection/content_validator.py:26 | `s.strip()` is empty iff every character of s is whitespace. Otherwise it starts and ends with a non-space character. It occurs in s with only whitespace before and after it. |
| PyStr.Replace | extractor/extractor.py:10 | `replace` with a pattern and replacement of equal length keeps the length. |
| PyStr.ReplaceAbsent | extractor/extractor.py:10 | A string in which the pattern never occurs is returned unchanged. |
| PyStr.ReplaceFirst | extractor/extractor.py:10 | Scanning is left to right. If no match starts inside a, then a + pat + b becomes a + rep + (b with its own matches replaced). |
| PyStr.ReplaceTrailing | extractor/extractor.py:10 | If the pattern's first character does not recur in it, a trailing occurrence is always replaced last. |
| ContentValidator.ContentErrors | data_collection/content_validator.py:12-29 | The "too short" error is present iff the length is below 100. The blank error is present iff the text is all whitespace. There are no errors iff the text has at least 100 characters and one non-whitespace character. Two errors always come in the order too short, then blank. |
| ContentValidator.ErrorsByRule | data_collection/content_validator.py:22-29 | The error list is exactly the "too short" error when under 100 characters, followed by the blank error when the text is all whitespace. It depends on nothing else about the text. |
| ContentValidator.ContentBoundaries | data_collection/content_validator.py:24-27 | 99 characters are too short, 100 pass, 150 spaces give only the blank error, and "" gives both errors in order. |
| ContentValidator.ResultFor | data_collection/content_validator.py:38-53 | The result carries the file name, and is valid iff it has no errors. An unreadable file is invalid with exactly one read error. A readable file gets exactly the errors the check returns, or, when the check raises, is invalid with exactly one read error carrying the exception's message. |
| ContentValidator.ValidateDirectory | data_collection/content_validator.py:31-55 | The keys are exactly the names of the `*.txt` entries. Every `*.txt` file gets its own result, and the last entry of a name decides it, whatever happened to other files. Each result is named after its key and is valid iff it has no errors. |
| ContentValidator.IntendedVerdict | data_collection/content_validator.py:40-46 | With the text check, a readable file's errors are those of the check. It is valid iff it has at least 100 characters and is not all whitespace. |
| ContentValidator.AsWrittenReportsEveryFileUnreadable | data_collection/content_validator.py:31-53 | As written, every readable `*.txt` file is invalid, with the single error "Error reading resolution file: 'str' object has no attribute 'glob'". |
| ContentValidator.AsWrittenRejectsGoodFile | data_collection/content_validator.py:31-53 | A 200-letter file is valid under the text check and invalid as written. |
| Seqs.Filter | extractor/validator.py:5 | The comprehension keeps only elements that pass the test, and drops none that pass. |
| Seqs.FilterConcat | extractor/validator.py:5 | Filtering distributes over concatenation, so listing order is kept. |
| Seqs.FilterKeepsAll | extractor/validator.py:5 | Nothing is dropped iff every element passes. |
| ExtractionValidator.VerdictFor | extractor/validator.py:11-14 | "Too small" iff the length is below 100. There is no whitespace rule. |
| ExtractionValidator.ValidateExtraction | extractor/validator.py:3-16 | Only `.txt` names are examined. Each examined file gets exactly one verdict, in listing order. The run finishes iff every examined file is readable. Otherwise it stops at the first unreadable one, with the verdicts of the files before it. |
| ExtractionValidator.BlankTextPassesLengthOnlyCheck | extractor/validator.py:11-14 | 100 spaces are validated here but reported blank by the content validator. |
| Extractor.OutputName | extractor/extractor.py:10 | The output name has the input's length. |
| Extractor.OutputOfPlainName | extractor/extractor.py:10 | A name without ".pdf" is kept unchanged. |
| Extractor.OutputAtFirstPdf | extractor/extractor.py:10 | The first ".pdf" of a name becomes ".txt". The text before it is kept, and the rest of the name is renamed the same way. |
| Extractor.OutputNameEndsInTxt | extractor/extractor.py:8-10 | A name ending in ".pdf" gives an output ending in ".txt". |
| Extractor.NoPdfRemains | extractor/extractor.py:10 | No ".pdf" occurs anywhere in an output name, so every occurrence was replaced. |
| Extractor.OutputNamesCanCollide | extractor/extractor.py:10-15 | "a.txt.pdf" and "a.pdf.pdf" both give "a.txt.txt", so the later conversion overwrites the earlier one. |
| Extractor.StepFor | extractor/extractor.py:8-18 | A ".pdf" file is written iff its conversion succeeds. It is written under a ".txt" name of the same length. |
| Extractor.ExtractTexts | extractor/extractor.py:7-18 | There is one step per ".pdf" name, in listing order, whatever failed before. A step is written iff its conversion succeeds, under its `replace` output name. |
| Downloader.AbsoluteUrl | extractor/downloader.py:19 | The URL starts with "http" and ends with the href. It equals the href iff the href starts with "http". Otherwise it is "https://www.bcb.gov.br" followed directly by the href. |
| Downloader.AbsoluteUrlIdempotent | extractor/downloader.py:19 | Making a URL absolute twice gives the same URL. |
| Downloader.FileNameOf | extractor/downloader.py:20 | The file name contains no "/" and ends the URL. It is the whole URL or preceded by "/". It ends in ".pdf" when the URL does. |
| Downloader.DownloadFor | extractor/downloader.py:18-20 | A ".pdf" href gives an absolute ".pdf" URL ending with the href. The URL is the href itself when the href starts with "http", and "https://www.bcb.gov.br" + href otherwise. Its file name is the URL's last path segment: a "/"-free ".pdf" suffix that is the whole URL or follows a "/". |
| Downloader.Plan | extractor/downloader.py:16-20 | There are at most as many downloads as hrefs, and each is well formed as above. |
| Downloader.PlanIsFilterThenResolve | extractor/downloader.py:16-20 | The plan is exactly the ".pdf" hrefs, in order, each resolved. |
| Downloader.DownloadEach | extractor/downloader.py:16-27 | Completes iff every planned URL can be fetched, and then saves the whole plan. Otherwise it stops at the first failing download, having saved exactly the plan before it. |
| Downloader.DownloadResolutions | extractor/downloader.py:7-29 | A failed search-page request raises before any download. Otherwise the run completes iff every planned URL can be fetched, and every saved download is well formed. A completed run saved the whole plan. A stopped run saved a proper prefix of the plan, and failed on the next planned download, whose URL cannot be fetched. |

## Left out

- Selenium driver options, page loads and readiness waits
  (resolution_collector.py:23-33, 37-42, 79-83). A search page is
  `Listed(links)` or `PageFailed`. A resolution page is `NeverReady` or
  `Rendered(title, spans)`. `NeverReady` stands for any exception raised
  inside the `try` at lines 36-58 that leaves no record: a load or wait
  failure, and also a failure while reading `.text` at lines 48-49. Each is
  caught at line 59 and yields None. A missing title element
  (`find_element` raises) is `title == None`.
- Building the search URL with `urlencode` and the fixed query parameters.
  Only the `startRow` offset is modelled.
- `save_data`: directory creation, the JSON encoding of the five fields
  (title, content, url, publication_date, collection_date) and the file
  write. Its success or failure is the `saveSucceeds` parameter. The file
  is read back with `json.load` only by the analysis scripts
  (data_mining/main.py:36-37, data_analysis/validation.py:11,
  data_analysis/longitudinal_analysis.py:14). Those scripts are not part of
  this model, so no save/load round trip is stated.
- `datetime.now().isoformat()`: a clock parameter indexed by extraction
  position.
- Logging and `print` output.
- `requests`/BeautifulSoup fetching and streamed writes, pdfminer
  `extract_text`, `os.listdir`/`glob`/file reads and `os.path.join`. Their
  outcomes are the parameters `fetches`, `converts` and the entries'
  `ReadResult`.
- A write that fails after `open(file_path, "w")` has truncated the file
  (resolution_collector.py:109-110), leaving it empty or partial, is not
  modelled. `Logged` stands only for "no batch was saved".
- The scan returns a dict, which iterates in insertion order. The model
  returns a Dafny `map`, which has no order.
- `data_mining/*`, `data_analysis/*`, `main.py` and `data_collection/main.py`.
  These are ML, plotting and orchestration. The orchestration reads
  `file_result.errors` (main.py:47), but the field is `validation_errors`.
- A failed search page aborts the whole run and nothing is written; the
  model does the same.
- A document whose body container has no spans yields no record, because
  the empty element list fails the `not content_elements` test. Spans with
  empty text do yield a record. Its content is "" for a single span and n−1
  newlines for n empty spans.
- The wait at resolution_collector.py:81 requires result items. If the
  page past the last result shows none, that wait times out and the run
  saves nothing. Whether this happens depends on the remote site, so the
  model lets the page source decide (`PageFailed` versus `Listed([])`).
- ResolutionCollector.Enumerate: the walk is proved to end only because the
  page source is a finite map and every offset past its keys shows no
  links. The Python loop has no bound of its own. It ends only if the site
  eventually serves a page without result links, or one that fails. The
  model assumes the site's results run out.
- PyStr.Split: only single-character separators are modelled, which is
  all the scripts use.

## Findings

| source | as written | input that shows it | evidently intended | confidence | as-written member | corrected member |
|---|---|---|---|---|---|---|
| data_collection/content_validator.py:31-40 | The second `def validate_resolution_content` (the directory scan) replaces the text check of line 12. Line 40 therefore calls the scan with a `str`, which raises `AttributeError`. Line 48 catches it, so every readable file is reported invalid with a read error. | a directory holding one readable `resolution.txt` of 200 letters `a` | line 40 applies the text check of line 12, and that file is valid | high; not executed | ContentValidator.AsWrittenReportsEveryFileUnreadable | ContentValidator.IntendedVerdict |
