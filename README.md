# MantisBT issue export — a Dafny model

The exporter logs in to a MantisBT bug tracker and goes through a list of issue numbers. For each issue it:

- opens the issue's view page;
- saves a snapshot into a folder named after the issue's category and number;
- downloads the issue's attachments into that folder's `attachements` directory under numbered, sanitised names;
- reads the issue's fields off the page into a fixed table of report-cell coordinates (`original_data`);
- fills a Word template's first table from that table, links the attachments, and names the document after the category and the twelfth custom field.

This project models that core in Dafny and proves what it does.

Modules:

- `Text` (`text.dfy`): the Python string operations the code relies on, each with its specification. These are `str.strip`, `str.lstrip`, `str.rstrip`, `split()` joined back together, `split(':')[0]`, `in`, and decimal rendering of the attachment index.
- `Http` (`http.dfy`): replies and requests. `raise_for_status` raises for statuses 400 to 599.
- `Page` (`page.dfy`): a parsed page as the sequence of its elements in document order. Includes `find`, `find_all` and the selectors the scraper uses.
- `Links` (`links.dfy`):
  - the trimmed base URL and how a download href is resolved against it;
  - `os.path.splitext`;
  - the `[^\w.-]` sanitiser;
  - the attachment file name;
  - the selection of unique attachment links (`get_unique_links`).
- `Folder` (`folder.dfy`): what `scrape_page` derives from the page: the issue number, the folder key and the snapshot name.
- `Extract` (`extract.dfy`): the table `original_data` and `get_report_data`. The latter is a method on a mutable `IssueData`, proved against the reference definition `ReportData`.
- `Report` (`report.dfy`): `populate_report` on a model of the opened template: its first table as a grid of cells, the table's row formats, and the body's paragraphs. The template is a `ReportDocument` class whose methods change it in place. They are proved against the folds `ScalarWrites` and `CustomWrites`.
- `Scraper` (`scraper.dfy`):
  - the `MantisScraper` session, with `Login`, `AccessIssuePage` and `DownloadMultipleTypeFiles`, each recording the requests it sends;
  - the attachment directory as a mutable map from file name to content;
  - how `main`'s loop over the issue list stops at the first issue whose body raises.
- `Issue` (`issue.dfy`): one issue end to end, from extraction into a fresh copy of the table to the cells the report's writes leave, and which issues `main`'s loop completes before the run ends.

Server replies, page contents, the set's iteration order and the listing of the attachment directory are all inputs of the model.

Where the code and its documentation disagree, the model follows the code:

- Whitespace inside the category is deleted from the folder key, not replaced: "Network Issues" gives `NetworkIssues_(…)`.
- Extraction accepts a page with fewer than twelve custom-field cells, but the report then fails while writing the missing entry. So a report is only completed for pages with exactly twelve.
- The custom-field loop enumerates the characters of the string `"custom-field"`. It therefore runs for indices 0 to 11, whatever the table holds.
- The `or` fallback name `{index}_file.{ext}` is never used, because the first name is never empty.
- The document name uses the category text as found, without the cleaning the folder key gets.
- A rejected issue page makes `access_issue_page` return `None`. Unpacking that raises in `main`, which ends the whole run rather than skipping the issue.
- A failure while scraping the page, extracting the fields or writing the report also raises out of `main`'s loop and ends the whole run. The documented error handling instead skips that issue and goes on to the next.

## Model

| member | source | states |
|---|---|---|
| Links.TrimBase | main.py:89 | the kept base URL is a prefix of the given one, does not end in `/`, and only slashes were cut |
| Links.TrimBaseIdempotent | main.py:89 | trimming an already trimmed base changes nothing |
| Scraper.MantisScraper.constructor | main.py:88-94 | the session keeps the trimmed base URL and the credentials, and has sent nothing |
| Scraper.MantisScraper.Login | main.py:159-170 | the requests sent and the outcome are those of `LoginRun`: the username form first; the password form only after a delivered reply holding the password prompt; success only when the second reply is delivered and holds the logged-in marker |
| Scraper.LoginRun | main.py:159-170 | the username form is always sent first; when a second request is sent, it is the password form |
| Scraper.LoginSucceedsIff | main.py:160-170 | login succeeds if and only if both replies are delivered and hold the password prompt and the logged-in marker respectively |
| Scraper.PasswordSentOnlyAfterPrompt | main.py:161-167 | the password is sent if and only if the first reply was delivered and held `Enter password for '<user>'` |
| Scraper.LoginRequestsIgnoreSecondReply | main.py:159-167 | which requests are sent does not depend on the second reply |
| Scraper.MantisScraper.AccessIssuePage | main.py:179-184 | exactly one GET of the issue URL is sent; the result is `IssuePage` of the reply |
| Scraper.IssuePage | main.py:179-187 | an accepted page is a delivered reply, returned with its text and the issue URL |
| Scraper.IssuePageAcceptedIff | main.py:181-184 | a page is accepted if and only if the reply is delivered and holds `View Issue Details` |
| Scraper.IssueUrlShape | main.py:179 | the issue URL is the trimmed base, `/view.php?id=`, then the issue, with no doubled slash at the join |
| Scraper.IssueUrl | main.py:179 | the issue page address: the trimmed base, `/view.php?id=` and the issue; `IssueUrlShape` states its parts |
| Scraper.IssuesProcessed | main.py:338-354 | the number of issues handled is at most the number listed |
| Scraper.IssuesProcessedStopsAtFirstFailure | main.py:338-354 | given whether each issue's loop body completes, the run handles every issue before the first one that raises and stops at that one |
| Scraper.IssuesProcessedAllIff | main.py:338-354 | the run reaches the end of the list if and only if no issue's body raises |
| Issue.IssueCompletes | main.py:339-354 | one issue's loop body completes when the page is accepted, `scrape_page` finds a title and a category cell, extraction succeeds and the report's writes succeed; any other outcome raises and ends the run |
| Issue.Completions | main.py:338-351 | one completion flag per listed issue |
| Issue.CompletionsAt | main.py:338-351 | flag i is whether issue i's body completes |
| Issue.IssueCompletesIff | main.py:339-351 | an issue's body completes if and only if its page is accepted, has a title and a `bug-category` cell, yields every scalar value, and has exactly twelve custom-field cells |
| Issue.RunStopsAtFirstFailedIssue | main.py:338-354 | the run completes every issue before the first whose page is rejected or whose scraping, extraction or report fails, and stops at that issue |
| Issue.RunReachesEveryIssueIff | main.py:338-354 | the run reaches the end of the issue list if and only if every issue's body completes |
| Scraper.IssuePageAcceptsMarkedText | main.py:180-187 | a delivered page with `View Issue Details` anywhere in its text is accepted and returned with the issue URL |
| Folder.IssueNumber | main.py:196 | the issue number is a colon-free prefix of the title, ending at the title's first colon or at its end |
| Folder.FolderKey | main.py:198-199 | the key is the category with its whitespace deleted, `_(`, the issue number and `)`, with each of `<>:"/\|?*` replaced by `_`; `FolderKeyShape` states its form |
| Folder.ReplaceIllegal | main.py:199 | the cleaning keeps the length and leaves no illegal path character |
| Folder.FolderKeyShape | main.py:198-199 | the folder key is the cleaned, whitespace-free category, `_(`, the cleaned issue number and `)`; it holds none of `<>:"/\|?*` |
| Folder.FolderKeyStable | main.py:199 | cleaning a folder key again leaves it unchanged |
| Folder.CategoryWhitespaceDeleted | main.py:198 | a space inside the category is deleted, so "A B" and "AB" give the same key |
| Folder.ReplaceIllegalFixesLegal | main.py:199 | the path cleaning leaves a string without illegal characters unchanged |
| Folder.ScrapePage | main.py:195-199 | a scraped issue number has no colon, the folder key is a legal path, and the snapshot name ends in `_report.html` |
| Folder.ScrapePageFails | main.py:196-198 | scraping fails if and only if the page has no `<title>` or no `<td>` of class `bug-category` |
| Folder.ScrapePageValue | main.py:196-199 | otherwise the number comes from the first title and the key from the first category cell |
| Extract.OriginalTableShape | main.py:25-56 | the table has one entry per scalar key and custom entries 0 to 11 |
| Extract.OriginalScalars | main.py:25-41 | the sixteen scalar entries of `original_data` with their row and column and no value yet |
| Extract.OriginalCustom | main.py:42-55 | the twelve `custom-field` entries: entry k at row 11 + k, column 1, no value yet; `Issue.OriginalCustomCoordinates` states it |
| Extract.ScalarKeysDistinct | main.py:25-41 | no scalar key is listed twice |
| Extract.IssueData.constructor | main.py:342 | a fresh per-issue copy holds exactly the declared table |
| Extract.LastText | main.py:224-225 | the stripped text of the last element whose class list is exactly `["bug-<key>"]`, or nothing when there is none; `LastTextIsLastMatch` and `LastTextNone` state this |
| Extract.Fill | main.py:217-226 | the scalar phase keeps the table's keys; each key in turn gains what it found, and the first key that found nothing stops it |
| Extract.ExtractCustom | main.py:219-222 | the custom phase keeps the table's keys; the k-th cell is appended to entry k, and a cell with no entry stops it |
| Extract.ReportData | main.py:215-226 | the scalar phase, then the custom phase over the page's custom-field cells when the scalar phase succeeded; `ReportDataOutcome` states when it succeeds |
| Issue.OriginalTableFresh | main.py:25-56 | the declared table has the right keys and holds no text yet |
| Issue.OriginalCustomCoordinates | main.py:42-55 | custom entry k addresses row 11 + k, column 1 |
| Issue.OriginalTableFits | main.py:25-56 | every cell the table names lies in a 23-row, 6-column template table |
| Extract.GetReportData | main.py:215-226 | the new table and the error are those of `ReportData` on the old table |
| Extract.FillScalars | main.py:217-226 | the entries and error after the loop over the scalar keys are those of `Fill` with what each key finds on the page; the custom entries are untouched |
| Extract.FillCustom | main.py:219-223 | the custom entries and error after the loop over the custom-field cells are those of `ExtractCustom` from index 0; the scalar entries are untouched |
| Extract.FillStep | main.py:224-226 | filling from key `i` on stops at key `i` when nothing is found for it, and otherwise appends the stripped last text and continues from key `i + 1` |
| Extract.LastTextIsLastMatch | main.py:224-225 | a scalar key reads the stripped text of the last element whose class list is exactly `["bug-<key>"]` |
| Extract.LastTextNone | main.py:224 | a scalar key finds nothing if and only if no element has that class list |
| Extract.FillSucceedsIff | main.py:217-226 | the scalar phase succeeds if and only if every key finds an element |
| Extract.FillFailsAtFirstMissing | main.py:224 | a failure names the first key, in table order, that found nothing |
| Extract.FillValue | main.py:224-226 | on success each scalar entry gained exactly the text its key found |
| Extract.FillOthersUnchanged | main.py:217-226 | entries of keys outside the loop keep their value |
| Extract.FillKeepsCoordinates | main.py:226 | no entry's row or column changes |
| Extract.ExtractCustomOutcome | main.py:219-222 | the custom phase fails if and only if there are more custom cells than entries |
| Extract.ExtractCustomValue | main.py:220-222 | the k-th custom cell's stripped text is appended to entry k; entries beyond the cells are unchanged |
| Extract.ExtractCustomUntouched | main.py:220-222 | entries below the starting index are untouched |
| Extract.ExtractCustomKeepsCoordinates | main.py:222 | no custom entry's row or column changes |
| Extract.ReportDataOutcome | main.py:217-226 | extraction succeeds if and only if every scalar key finds an element and there are at most 12 custom cells |
| Extract.ReportDataScalar | main.py:224-226 | after a successful extraction each scalar entry gained what its key found |
| Extract.ReportDataCustom | main.py:219-222 | after a successful extraction custom entry k gained the k-th cell's stripped text when there is one, and is unchanged otherwise |
| Extract.ReportDataKeepsCoordinates | main.py:215-226 | extraction keeps every key and every coordinate |
| Report.ReportDocument.constructor | main.py:229-236 | the opened template holds the given table, row formats and body |
| Report.ReportDocument.SetCell | main.py:247-249 | one cell is replaced and nothing else changes |
| Report.Put | main.py:247-249 | after a write the grid has the same shape, the written cell is the new one, and every other cell is unchanged |
| Report.AddLink | main.py:241-244 | the cell's first paragraph gains one hyperlink run to the issue URL; its other paragraphs are kept |
| Report.TextCell | main.py:247-249 | `cell.text = t` leaves one paragraph with one run holding `t` |
| Report.ScalarCell | main.py:239-249 | the `id` cell gains the issue link in its first paragraph; any other scalar cell becomes the plain text |
| Report.ScalarWrites | main.py:238-249 | the scalar writes keep the grid's shape, writing each key's cell in table order until an entry without a value |
| Report.CustomWrites | main.py:245-247 | the custom writes keep the grid's shape, writing custom entries from `index` until an entry without a value |
| Report.Populated | main.py:238-249 | the scalar writes, then the custom writes over indices 0 to 11 when the scalar writes succeed; the `Populated…` lemmas of `Issue` state the cells it leaves |
| Report.WriteScalarFields | main.py:238-249 | the grid and error after the scalar writes are those of `ScalarWrites` |
| Report.ScalarWritesStep | main.py:238-249 | the writes from key `i` on stop at key `i` when its entry has no value, and otherwise are the write of key `i` followed by the writes from key `i + 1` on |
| Report.WriteCustomFields | main.py:245-247 | the grid and error after the custom writes are those of `CustomWrites` over indices 0 to 11 |
| Report.ScalarWritesOutcome | main.py:238-249 | the scalar writes succeed if and only if every scalar entry has a value |
| Report.ScalarWritesUntouched | main.py:238-249 | a cell no scalar entry addresses keeps its content |
| Report.ScalarWritesValue | main.py:239-249 | with distinct coordinates, each entry's cell ends up as its own write: a hyperlink for `id`, plain text otherwise |
| Report.CustomWritesOutcome | main.py:245-247 | the custom writes succeed if and only if entries 0 to 11 all have a value |
| Report.CustomWritesUntouched | main.py:245-247 | a cell no custom entry addresses keeps its content |
| Report.CustomWritesValue | main.py:245-247 | with distinct coordinates, custom entry k's cell holds its text as a single run |
| Report.ReportDocument.FixRowHeights | main.py:252-255 | rows with index at most 7 or at least 10 become exactly 0.5 cm high; rows 8 and 9 and the rest of the document are unchanged |
| Report.ReportDocument.AddAttachmentLinks | main.py:257-260 | one paragraph linking `attachements/<name>` is appended per listed file, in order |
| Report.AttachmentParagraphs | main.py:257-260 | one link paragraph per file, in listing order |
| Report.DocumentName | main.py:262 | the name is the category text, then `-`, then exactly the twelfth custom text, then `.docx` |
| Report.PopulateReport | main.py:238-262 | the grid is `Populated` of the old grid. A failing write leaves the row formats and body unchanged. On success the row heights are fixed, the attachment links are appended and the result is the document name |
| Issue.ExtractionKeepsFit | main.py:350-351 | a template that holds the table's cells still holds them after extraction |
| Issue.ExtractedScalarsHaveValues | main.py:224-226 | after extraction into a fresh table every scalar entry holds exactly one text |
| Issue.ExtractedCustomValues | main.py:219-222 | after extraction into a fresh table custom entry k holds one text exactly when the page has more than k custom cells |
| Issue.WritesNeedEveryCustomValue | main.py:238-249 | with every scalar entry filled, the report's writes succeed if and only if all twelve custom entries are filled |
| Issue.ReportNeedsTwelveCustomFields | main.py:219-247 | after a successful extraction the report is completed if and only if the page has exactly twelve custom-field cells |
| Issue.ReportNameSources | main.py:262 | the document name's parts are the stripped `category` text as found and the twelfth custom cell's stripped text |
| Issue.DeclaredTableReport | main.py:350-351 | with the declared table and a 23-by-6 template, the report is completed if and only if the page has twelve custom-field cells |
| Issue.DeclaredScalarCellsDistinct | main.py:25-41 | no two scalar entries of the declared table share a cell |
| Issue.DeclaredCoordinatesFit | main.py:25-56 | a table with the declared coordinates fits a 23-by-6 template |
| Issue.DeclaredScalarCellOwn | main.py:25-41 | with the declared coordinates, no other scalar entry addresses scalar entry j's cell |
| Issue.DeclaredScalarCell | main.py:239-249 | with the declared coordinates, key 0 (`id`) is written as the template's cell (row 1, column 0) with the issue link appended, and every other key as plain text |
| Issue.PopulatedScalarValue | main.py:238-249 | after successful writes with the declared coordinates, the `id` cell is the template's cell with the issue link appended, and every other scalar cell holds its value as plain text |
| Issue.PopulatedCustomValue | main.py:245-247 | after successful writes with the declared coordinates, custom cell k (row 11 + k, column 1) holds entry k's text |
| Issue.PopulatedUntouched | main.py:238-249 | whether or not the writes succeed, a cell no entry addresses keeps the template's content |
| Issue.ExtractionKeepsDeclaredCoordinates | main.py:215-226 | extraction into the declared table keeps its coordinates |
| Issue.OriginalDeclared | main.py:25-56 | the declared table has the declared keys and coordinates |
| Issue.ExtractionKeepsCoordinatesOf | main.py:215-226 | extraction into any table with the declared coordinates keeps them, whatever the page |
| Issue.ReportScalarCellFromPage | main.py:224-249 | after extraction and successful writes, each scalar cell holds the stripped text of its key's last element, as the issue link in the `id` cell |
| Issue.ReportCustomCellFromPage | main.py:219-247 | after extraction and successful writes, custom cell k holds the stripped text of the page's k-th custom-field cell |
| Links.AbsoluteHrefKept | main.py:296 | an href starting with `http` is used as it is |
| Links.JoinPointSingleSlash | main.py:296 | a relative href is joined to the trimmed base with exactly one slash, its own leading slashes dropped |
| Links.ResolveUrl | main.py:296 | an href starting with `http` is kept; any other is joined to the base with `/` after its leading slashes are dropped; `AbsoluteHrefKept` and `JoinPointSingleSlash` state this |
| Links.SplitExt | main.py:298 | the base name and the extension concatenate back to the text; the extension is empty or a dot followed by no dot or slash |
| Links.HasNonDotIff | main.py:298 | the recursive test for a non-dot character in a range holds if and only if some position of the range holds a character other than `.` |
| Links.SplitExtNoDot | main.py:298 | text without a dot has no extension |
| Links.SplitExtLeadingDots | main.py:298 | when only dots stand between the last `/` and the last `.` (`.bashrc`, `a/..x`), or no `.` follows the last `/`, the text has no extension |
| Links.SplitExtOfNameDotExt | main.py:298 | `name.ext` splits back into `name` and `.ext` |
| Links.Sanitise | main.py:304 | sanitising keeps the length and leaves only letters, digits, `_`, `.` and `-` |
| Links.SanitiseAt | main.py:304 | each character is kept or replaced by `_` |
| Links.SanitiseIdempotent | main.py:304 | sanitising twice is sanitising once |
| Links.SanitiseConcat | main.py:304 | sanitising distributes over concatenation |
| Links.FallbackNeverUsed | main.py:304 | the `or` fallback name never applies |
| Links.AttachmentFilename | main.py:298-304 | the sanitised `{index}_{stripped base name}.{extension without leading dots}`; `AttachmentFilenameShape` and `FilenameDeterminesIndex` state its properties |
| Links.AttachmentFilenameShape | main.py:298-304 | the file name is the index, `_`, and the sanitised stripped base name, `.` and extension; it is clean |
| Links.NoExtensionTrailingDot | main.py:298-304 | a text without an extension gives a name ending in `.` |
| Links.FilenameDeterminesIndex | main.py:304 | attachments with different indices never share a file name |
| Links.UniqueLinks | main.py:278-280 | the set holds exactly the listed links with one attribute, no child tag and non-blank text |
| Links.Qualifies | main.py:278 | a link survives when it has exactly one attribute, no child tag and non-blank text |
| Links.UniqueLinksIdempotent | main.py:278-280 | selecting again from a listing of the survivors gives the same set |
| Links.QualifiedCandidateShape | main.py:278 | a surviving download anchor is determined by its href and its text |
| Links.SurvivorsDistinctByKey | main.py:278-279 | two different survivors differ in href or in text |
| Links.CandidateLinks | main.py:345 | the `<a>` elements whose href exists and contains `file_download.php`, in document order (`Page.FindAllMembers` states the selection) |
| Links.SurvivorsHaveHref | main.py:345 | every link selected from a page's candidates has a non-empty href, so `link["href"]` never raises on that path |
| Scraper.MantisScraper.DownloadMultipleTypeFiles | main.py:287-316 | the files and the sent requests are those of `DownloadRun`: links enumerated from 1; one GET per link to its resolved URL; a delivered reply saved under the link's numbered name; a failed one skipped |
| Scraper.DownloadRun | main.py:293-316 | link by link: one GET to its resolved URL, and the delivered reply's content saved under the link's numbered name; `DownloadRunRequests` and `DownloadRunFiles` state the outcome |
| Scraper.DownloadRunRequests | main.py:293-309 | the loop sends one GET per link, in enumeration order, to the link's resolved URL |
| Scraper.DownloadRequests | main.py:293-309 | the loop's GETs, one per link in enumeration order, to its resolved URL; `DownloadRunRequests` ties them to the loop |
| Scraper.BatchNames | main.py:293-304 | the batch's file names: link i is named with index + i; `BatchNamesAt` and `BatchNamesDistinct` state them |
| Scraper.SavedFiles | main.py:309-313 | each delivered reply's content written under its name, a raised one skipped; `SavedFilesDelivered`, `SavedFilesOthersUnchanged` and `SavedFilesKeys` state the result |
| Scraper.DownloadRunFiles | main.py:293-313 | the files the loop leaves are the batch's delivered replies saved under the batch names |
| Scraper.BatchNamesDistinct | main.py:293-304 | no two links of a batch get the same file name |
| Scraper.BatchNamesAt | main.py:293-304 | the i-th name of a batch numbered from `index` is the attachment name built from number `index + i` and the i-th link text |
| Scraper.SavedFilesDelivered | main.py:309-313 | with distinct names, every delivered reply's content ends up under its name |
| Scraper.SavedFilesOthersUnchanged | main.py:306-313 | files outside the batch keep their content |
| Scraper.SavedFilesKeys | main.py:309-316 | the directory gains exactly the names of the delivered downloads |
| Scraper.DownloadSavesEachDelivered | main.py:293-316 | every delivered attachment is saved under `<position>_<name>` with its own content |
| Text.StripSpec | main.py:221 | the stripped text is the infix of the input left after cutting a run of whitespace at each end; it neither starts nor ends with whitespace, and is empty exactly when the input is all whitespace |
| Text.Strip | main.py:221 | `str.strip()`: the text without its leading and trailing whitespace; `StripSpec` states which infix is kept |
| Text.RemoveSpace | main.py:198 | `"".join(s.split())` holds no whitespace, returns whitespace-free text unchanged and all-whitespace text as empty; with `RemoveSpaceConcat` this fixes it as deleting exactly the whitespace characters and keeping the rest in order |
| Text.BeforeFirst | main.py:196 | `split(c)[0]` is a prefix without `c` that is the whole text or ends where the first `c` stands |
| Text.Contains | main.py:162 | Python's `in` on strings; `ContainsIff` states it is an occurrence at some position |
| Text.LStripCharSpec | main.py:296 | `lstrip` of a character removes exactly a prefix made of that character and leaves a text that does not start with it |
| Text.RemoveSpaceConcat | main.py:198 | whitespace deletion distributes over concatenation |
| Text.ContainsIff | main.py:162 | `x in s` holds if and only if `x` occurs at some position of `s` |
| Text.DecimalRoundTrip | main.py:304 | the rendered index parses back to the index |
| Text.DecimalInjective | main.py:304 | different indices render differently |
| Page.FindSpec | main.py:196-198 | `find` fails exactly when no element matches, and otherwise returns a matching element of the page |
| Page.FindAllMembers | main.py:219 | `find_all` returns exactly the matching elements |
| Page.FindIsFirst | main.py:196-198 | `find` returns the first matching element in document order |
| Page.FindAllLast | main.py:224 | the last element `find_all` returns is the last match in document order |
| Page.AttrCountNames | main.py:278 | the modelled attribute count is the number of distinct attribute names of the tag, since `Attributes` keeps `class` out of `attrs` |

## Left out

- HTTP transport, sessions, headers, timeouts and redirects: each reply is an input, and a transport failure or error status is the single `TransportFailure`/status case.
- HTML parsing and `prettify`: a page is the sequence of its elements in document order, and an element's `.text` is an input field. Writing the snapshot file is not modelled, only its name.
- Python's `set` iteration order is not modelled: `DownloadMultipleTypeFiles` takes the order as a parameter listing the set once.
- Element equality and hashing in BeautifulSoup are modelled as structural equality of the modelled fields.
- The Word document's XML, relationship ids, fonts, styles, loading the template and `save` are not modelled. The hyperlink is one run with its target and text.
- The PDF conversion `convert` is a foreign call and is not modelled.
- Directory creation and `os.walk` are not modelled: the attachment directory's listing is the `files` input of `PopulateReport`.
- `get_issue_list`, environment variables, `getpass`, `input` and logging are not modelled: they are I/O. The `try`/`except` re-raising in `main` is control flow; it is modelled as the stop at the first issue whose body raises (`IssuesProcessed`, `Issue.IssueCompletes`).
- Issue.IssueCompletes: the exceptions it covers are a rejected page, a failed `scrape_page`, a failed extraction and failed report writes. Raises from file and directory writes, `Document` loading, `save` and `convert` are not modelled, and the page's elements are an input rather than parsed from the reply's text.
- Report.Grid: each grid position is an independent cell. python-docx's `Table.cell` returns one shared cell for all positions of a merged cell, so on a template with merged cells a write also changes the other positions of that cell. Merged cells are not modelled, and "untouched" in `ScalarWritesUntouched`, `CustomWritesUntouched` and `Issue.PopulatedUntouched` is per grid position.
- `add_hyperlink` is modelled by what it adds: one hyperlink with its target and text.
- Links.IsWordChar: `\w` is ASCII letters, digits and `_`; Python's Unicode `\w` also keeps non-ASCII letters and digits.
- Links.SplitExt: follows POSIX `os.path.splitext`; on Windows, `\` also separates path parts.
- Report.PopulateReport: requires every coordinate of the table to lie inside the template table (`Fits`); python-docx's negative and out-of-range cell indices are not modelled.
- Scraper.MantisScraper.DownloadMultipleTypeFiles: requires every link to have an `href`. On `main`'s path this always holds, since the links come from the href filter (`Links.SurvivorsHaveHref`); the `KeyError` a link without one would raise is not modelled.
- Scraper.MantisScraper.DownloadMultipleTypeFiles: a reply that is delivered but fails while its file is written is not modelled.
